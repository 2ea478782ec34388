# ast-analyzer core, modelled in Dafny

This project models the core of `ast-analyzer`, a Rust tool that reads Go source code
through tree-sitter syntax trees. The model covers four parts:

- **The symbol indexer** (`GoIndexer`). It finds a file's package name. It then walks the
  syntax tree in pre-order and stores the full text of every named method declaration in
  an in-memory store (`InMemoryIndexStore`). The key is `package::receiver::method`.
- **The two declaration extractors** (`LangParser`, in the analyzer and in the library
  crate). They walk a tree and send the text of each matching declaration on a channel.
- **The LSP client** (`LspClient`). It frames JSON-RPC requests with a `Content-Length`
  header, following the Base Protocol of the Language Server Protocol, version 3.17. It
  reads framed responses back and skips messages until one carries the expected id.
- **The project walker** (`CodeWalker`). It lists a project's files with their languages
  and dispatches every Go file to the indexer.

## Files

| File | What it holds |
|---|---|
| `wrappers.dfy` | `Option`, `Result`, `Unit` |
| `text.dfy` | Bytes. UTF-8 well-formedness (`String::from_utf8`), `str::trim` over Unicode White_Space, `usize::from_str` on a 64-bit target, and decimal formatting |
| `syntax.dfy` | The tree-sitter node as a value, `get_node_text`, `child_by_field_name`, pre-order, and the generic "emit matching texts" walk |
| `memory.dfy` | `InMemoryIndexStore` as a class with a `map` field |
| `indexer.dfy` | `GoIndexer`: name lookups, `construct_key`, the package search, and the store walk |
| `indexer_example.dfy` | The file `package demo\nfunc (t T) Hi() {}\n`, its tree, and the store it produces |
| `parser.dfy` | The analyzer's `LangParser::traverse` (method declarations) |
| `doc_parser.dfy` | The library crate's `LangParser::traverse` (struct type specs and method declarations) |
| `lsp.dfy` | `LspClient`: framing, the header scan, the `Content-Length` search, the correlation loop, and the two requests |
| `tree.dfy` | `get_language`, `get_files_and_language` and `CodeWalker::index_project` |

Each stateful part is a class whose methods change its fields: the store's map, a channel
(the sequence of messages sent), the stream's cursor and written bytes. Each method is
proved against a function that states the whole result. The properties are proved about
that function: `Entries`, `Emitted`, `ReadFrom`, `IndexFiles` and `FilesOf`.

`get_struct_name` returns the verbatim text of the first `parameter_list` child. For a
method declaration that is the receiver, parentheses included. So `func (t T) Hi() {}` in
package `demo` is keyed `demo::(t T)::Hi`, and `demo::T::Hi` is not stored
(`IndexerExample.DemoIndex`).

## Model

| member | source | states |
|---|---|---|
| Syntax.NodeText | analyzer/src/indexer.rs:28-33 | `get_node_text` returns exactly the source bytes of `[start, end)`, and they are well-formed UTF-8. The range must lie in the buffer and decode, because the code panics otherwise (`TextOk`). The copies at analyzer/src/parser.rs:46-52 and src/lib/mod.rs:55-61 are the same function |
| Syntax.FirstWhere | analyzer/src/indexer.rs:36-41 | The index of the first child that satisfies the test: all earlier children fail it. `None` exactly when no child passes |
| Syntax.ChildByFieldName | src/lib/mod.rs:36 | `child_by_field_name`: the result is a child held under that field. `None` exactly when no child is held under it |
| Indexer.MethodName | analyzer/src/indexer.rs:35-42 | The text of the first direct child that is a `field_identifier` or `method_spec`. `None` exactly when there is no such child |
| Indexer.StructName | analyzer/src/indexer.rs:44-51 | The verbatim text of the first direct `parameter_list` child, parentheses included. `None` exactly when there is none |
| Indexer.ConstructKey | analyzer/src/indexer.rs:74-84 | The key starts with `package::` and ends with `::method`. Its length is that of the two-segment or three-segment form. With a struct segment, the struct's text sits between the two separators |
| Indexer.ClauseNameIs | analyzer/src/indexer.rs:55-60 | A `package_clause` whose text is `package ` and then a name with no surrounding White_Space declares that name |
| Indexer.PackageName | analyzer/src/indexer.rs:53-72 | A name the search returns has no leading or trailing White_Space: it has been trimmed |
| Indexer.PackageNameIn | analyzer/src/indexer.rs:63-71 | The loop over the children: a name it returns is trimmed |
| Indexer.PackageNameIsFirstClause | analyzer/src/indexer.rs:53-72 | The recursive search returns the name of the first reachable `package_clause`, in pre-order, whose text starts with `package `, with the prefix removed and the rest trimmed. It goes past clauses without the prefix, later siblings included. It finds nothing when no clause has the prefix. The search is panic-free exactly when the clauses it reads decode |
| Indexer.FirstClauseNameAppend | analyzer/src/indexer.rs:65-69 | Searching a list of clauses finds the first part's name if it has one, and the second part's otherwise |
| Indexer.KeyPrefix | analyzer/src/indexer.rs:118-121 | `index` uses the package name, or the empty string when the tree declares none |
| Indexer.Entries | analyzer/src/indexer.rs:86-114 | Every key `traverse` writes under a prefix starts with `prefix::` |
| Indexer.EntriesAll | analyzer/src/indexer.rs:110-113 | The writes for a list of siblings: every key starts with `prefix::` |
| Indexer.EntriesAllAppend | analyzer/src/indexer.rs:110-113 | The writes for a list of siblings are the writes for its two parts, in order |
| Indexer.EntriesArePreOrder | analyzer/src/indexer.rs:86-114 | `traverse` writes one entry for each named method declaration of the tree, in pre-order, nested declarations included. The key is `construct_key(prefix, receiver, name)` and the value is the declaration's text. Other nodes and unnamed methods write nothing |
| Indexer.EntriesOfAppend | analyzer/src/indexer.rs:111-113 | The writes for a list of declarations are the writes for its two parts, in order |
| Indexer.Upsert | analyzer/src/indexer.rs:100-106 | After the writes, the store's keys are the old keys plus every key written |
| Indexer.UpsertAppend | analyzer/src/indexer.rs:111-113 | Writing two runs of entries is writing their concatenation |
| Indexer.UpsertLastWins | analyzer/src/indexer.rs:100-106 | A key holds the text of its last write |
| Indexer.UpsertUntouched | analyzer/src/indexer.rs:100-106 | A key no write touches keeps its value and is not added |
| Indexer.IndexLastWins | analyzer/src/indexer.rs:118-123 | After `index`, when two declarations share a key, the later one in pre-order wins |
| Indexer.IndexKeepsOtherKeys | analyzer/src/indexer.rs:118-123 | After `index`, a key no declaration of the tree produces is left as it was |
| Indexer.GoIndexer.Traverse | analyzer/src/indexer.rs:86-114 | The store afterwards is the old store upserted with `Entries(prefix, node)`, in order |
| Indexer.GoIndexer.Index | analyzer/src/indexer.rs:118-123 | The store afterwards is the old store upserted with the tree's entries under its package prefix |
| IndexerExample.DemoPackage | analyzer/src/indexer.rs:55-60 | In the example file, the package search finds `demo` |
| IndexerExample.DemoMethodOk | analyzer/src/indexer.rs:35-51 | The example method's name is `Hi` and its struct segment is `(t T)` |
| IndexerExample.DemoEntries | analyzer/src/indexer.rs:86-114 | The example tree writes one entry, for `Hi` |
| IndexerExample.DemoIndex | analyzer/src/indexer.rs:74-84 | Indexing the example into an empty store leaves only `demo::(t T)::Hi`, holding `func (t T) Hi() {}`. The key `demo::T::Hi` is not stored |
| Memory.InMemoryIndexStore.constructor | analyzer/src/memory.rs:8-12 | `new` yields an empty store |
| Memory.InMemoryIndexStore.Set | analyzer/src/memory.rs:16-18 | `set` is an unconditional upsert. The key maps to the new value, and every other key keeps its value. No other key is added |
| Memory.InMemoryIndexStore.Get | analyzer/src/memory.rs:20-22 | `get` returns the stored text. It requires the key to be present (the code unwraps) and does not change the store |
| Memory.InMemoryIndexStore.GetAll | analyzer/src/indexer.rs:15 | `get_all` is declared but not implemented by this store. Modelled as the whole map: the same keys, each with its text |
| Indexer.GoIndexer.constructor | analyzer/src/indexer.rs:23-25 | `new` keeps the store it is given |
| Parser.LangParser.Traverse | analyzer/src/parser.rs:31-43 | The channel afterwards holds the old messages followed by `Emitted(IsMethodDeclaration, node)` |
| Parser.SentArePreOrderMethods | analyzer/src/parser.rs:31-43 | The walk sends the texts of the tree's method declarations, in pre-order, one per declaration. Nested declarations come after their parent and nothing else is sent. The count equals the number of method declarations |
| Syntax.EmittedIsPreOrder | analyzer/src/parser.rs:31-43 | For any node test: the walk emits the texts of the matching nodes of the pre-order, in order, once each |
| Parser.LangParser.constructor | analyzer/src/parser.rs:13-24 | `new`: a fresh channel with nothing sent |
| DocParser.LangParser.constructor | src/lib/mod.rs:15-26 | `new`: a fresh channel with nothing sent |
| DocParser.DocumentedTypeSpec | src/lib/mod.rs:36 | A `type_spec` is sent exactly when its first child under field `type` exists and is a `struct_type` |
| DocParser.LangParser.Traverse | src/lib/mod.rs:33-52 | The channel afterwards holds the old messages followed by `Emitted(IsDocumented, node)` |
| DocParser.SentArePreOrderDeclarations | src/lib/mod.rs:33-52 | The walk sends the texts of the struct type specs and method declarations, in pre-order, one per node, and nothing else |
| Lsp.FileUri | analyzer/src/lsp.rs:27 | The URI is `file://` followed by the path, unchanged |
| Lsp.IsAbsolute | analyzer/src/lsp.rs:24 | A path is absolute exactly when it starts at the root, that is, exactly when its URI starts with `file:///`. The same test guards `get_definition` at line 102 |
| Lsp.Frame | analyzer/src/lsp.rs:136 | A frame is as long as its header and body together, and ends with the body unchanged |
| Lsp.FrameParts | analyzer/src/lsp.rs:136 | A frame is its header followed by the body. The header starts with `Content-Length: ` and ends with `\r\n\r\n` |
| Lsp.HeaderScan | analyzer/src/lsp.rs:147-151 | A position the byte-at-a-time scan stops at lies in the input, and the bytes read up to it end with `\r\n\r\n` |
| Lsp.HeaderScanIsFirst | analyzer/src/lsp.rs:147-151 | The scan stops at the first such position: no earlier position ends with `\r\n\r\n`. When it stops at none, none exists up to the end of the input |
| Lsp.HeaderScanFinds | analyzer/src/lsp.rs:147-151 | Conversely, the scan stops at any position that ends with `\r\n\r\n` when no earlier one does |
| Lsp.HeaderEnd | analyzer/src/lsp.rs:147-151 | A found header ends with `\r\n\r\n` and lies in the input |
| Lsp.Lines | analyzer/src/lsp.rs:156 | `str::lines`: no line contains `\n` |
| Lsp.LinesJoin | analyzer/src/lsp.rs:156 | Joining the lines with `\n` gives back the text without the `\r` of each `\r\n` and without a final `\n`. There are no lines exactly when the text is empty |
| Lsp.LineValue | analyzer/src/lsp.rs:157-163 | A line gives a value only when it starts with `Content-Length:`, and the value is at most `usize::MAX`. For such a line, the value is what `usize::from_str` makes of the trimmed rest of the line |
| Lsp.SpacedLengthLineValue | analyzer/src/lsp.rs:157-163 | `Content-Length:` followed by `n`'s numeral, with any runs of White_Space before and after it, gives `n`, for every `n` up to `usize::MAX` |
| Lsp.FindMapIsFirst | analyzer/src/lsp.rs:157-163 | `find_map` gives the value of the first line that has one. It gives nothing exactly when no line has a value |
| Lsp.ContentLength | analyzer/src/lsp.rs:155-164 | The declared length is the value of the first line that gives one, and it starts with `Content-Length:`. There is none exactly when no line gives a value |
| Lsp.BodyLength | analyzer/src/lsp.rs:154-164 | A header that is not UTF-8 fails with `HeaderNotUtf8`. A UTF-8 header without a parsable `Content-Length:` line fails with `MissingContentLength`. Otherwise the result is the declared length, which is at most `usize::MAX`. Each outcome holds exactly in its case |
| Lsp.ReadFrom | analyzer/src/lsp.rs:143-188 | The loop never moves the cursor back or past the input. A body it returns is JSON and carries the expected id, if one is expected |
| Lsp.ReadMessage | analyzer/src/lsp.rs:154-186 | The same, for the rest of a read after its header |
| Lsp.ReadFromNoHeader | analyzer/src/lsp.rs:147-151 | Input that ends before a header terminator fails with end of input |
| Lsp.FrameHeaderLength | analyzer/src/lsp.rs:136 | The header `send_request` writes declares the body's length as its `Content-Length` |
| Lsp.FrameHeaderLines | analyzer/src/lsp.rs:136 | The written header's lines are its `Content-Length` line and one empty line |
| Lsp.FrameHeaderEnd | analyzer/src/lsp.rs:147-151 | The header scan stops exactly where a written frame's body starts |
| Lsp.BodyLengthReadsFrameHeaders | analyzer/src/lsp.rs:154-164 | The header reading gives back the length of every header `send_request` writes |
| Lsp.ReadFrame | analyzer/src/lsp.rs:136 | Round trip: a frame `send_request` wrote is read back as its body, with the cursor after it, when the body matches. Otherwise it is skipped whole and the read goes on after it |
| Lsp.ReadTwoFrames | analyzer/src/lsp.rs:171-186 | Waiting for id 2 skips a response with id 99 and returns the next one. Waiting for no id returns the first response |
| Lsp.SkipFrames | analyzer/src/lsp.rs:170-186 | For any number of frames `send_request` wrote, none of whose bodies is the response waited for: the read skips them all and goes on after the last one |
| Lsp.ReadFramesToMatch | analyzer/src/lsp.rs:170-186 | For frames written back to back whose last body is the first one waited for: the read returns that body, with the cursor just after it |
| Lsp.SkipsUnrelatedResponse | analyzer/src/lsp.rs:173-181 | The same, for the two frames written back to back |
| Lsp.LspClient.constructor | analyzer/src/lsp.rs:15-20 | A fresh connection: nothing read or written, and headers are read with `BodyLength` |
| Lsp.LspClient.SendRequest | analyzer/src/lsp.rs:133-141 | Appends exactly `Content-Length: <n>\r\n\r\n` and the body to the output, and nothing else. The input cursor does not move |
| Lsp.LspClient.ReadHeader | analyzer/src/lsp.rs:145-151 | Consumes bytes one at a time up to the shortest prefix that ends with `\r\n\r\n`, and no further. At end of input it fails with the cursor at the end |
| Lsp.LspClient.ReadResponse | analyzer/src/lsp.rs:143-188 | The result and the new cursor are `ReadFrom(input, old cursor)`. Bodies that are not JSON or carry another id are consumed and skipped. Nothing is written |
| Lsp.LspClient.SendInitializeRequest | analyzer/src/lsp.rs:22-94 | A relative path is rejected before anything is written. Otherwise it sends `initialize` with id 1 and root `file://<path>`, then reads with no expected id. On success it sends `initialized`. A read error is returned |
| Lsp.LspClient.GetDefinition | analyzer/src/lsp.rs:96-131 | A relative path is rejected before anything is written. Otherwise it sends `textDocument/definition` with id 2 for `file://<path>` at the given position, and waits for id 2 |
| Lsp.DefinitionAfterInterimMessage | analyzer/src/lsp.rs:128 | A client whose server sends a response with id 99 and then the one with id 2 gets the definition, with all input consumed |
| Text.ParseDecimal | analyzer/src/lsp.rs:159 | `usize::from_str` reads back every decimal numeral up to `usize::MAX` |
| Text.ParseUsize | analyzer/src/lsp.rs:159 | `usize::from_str` accepts only an optional `+` followed by one or more ASCII digits, and gives the number they denote, which is at most `usize::MAX`. A numeral of digits alone parses exactly when it fits. A `+` before a digit changes nothing |
| Text.Decimal | analyzer/src/lsp.rs:136 | `format!("{}", n)` writes digits only, with no leading zero |
| Text.DecimalValue | analyzer/src/lsp.rs:136 | The numeral written for `n` denotes `n` |
| Text.Trim | analyzer/src/lsp.rs:159 | `trim` returns a piece of its input that neither starts nor ends with White_Space |
| Text.TrimDropsTrailingSpace | analyzer/src/lsp.rs:159 | A trailing White_Space character is dropped. With `TrimDropsLeadingSpace` and `TrimmedIsFixed`, this gives `trim` of any text that is White_Space, then trimmed text, then White_Space |
| Text.TrimDropsLeadingRun | analyzer/src/lsp.rs:159 | A run of White_Space characters before the text is dropped |
| Text.TrimDropsTrailingRun | analyzer/src/lsp.rs:159 | A run of White_Space characters after the text is dropped |
| Text.TrimmedIsFixed | analyzer/src/indexer.rs:59 | Text that neither starts nor ends with White_Space is left as it is |
| Text.TrimDropsLeadingSpace | analyzer/src/lsp.rs:159 | `trim` drops a leading White_Space character |
| Text.ValidUtf8 | analyzer/src/lsp.rs:154 | `String::from_utf8`'s test: well-formed UTF-8 never starts with a continuation byte |
| Text.AsciiIsUtf8 | analyzer/src/lsp.rs:154 | ASCII bytes are well-formed UTF-8 |
| Tree.GetLanguage | analyzer/src/tree.rs:80-86 | The language is `go` or `unknown` |
| Tree.GetLanguageGo | analyzer/src/tree.rs:80-86 | The language is `go` exactly when the path ends in `.go` or is the bare name `go`, that is, when its last `.`-separated segment is `go`. It is `unknown` otherwise |
| Tree.FilesOfMembers | analyzer/src/tree.rs:68-78 | The file list holds exactly the walk's readable regular files, each with the language of its path |
| Tree.FilesOfAppend | analyzer/src/tree.rs:68-78 | The file list keeps walk order |
| Tree.GetFilesAndLanguage | analyzer/src/tree.rs:68-78 | The loop builds `FilesOf(walk)` |
| Tree.CodeWalker.NewProject | analyzer/src/tree.rs:30-33 | The walker's files are the file list of the walk |
| Tree.IndexFile | analyzer/src/tree.rs:41-60 | A non-Go file is skipped without error. A Go file fails exactly when it does not read as UTF-8 or does not parse, with the matching error, leaving the store unchanged |
| Tree.IndexFiles | analyzer/src/tree.rs:40-62 | The loop over the files: indexing only adds keys to the store |
| Tree.IndexFilesAppend | analyzer/src/tree.rs:40-62 | Runs compose in list order. After an error, later files are not touched |
| Tree.IndexFilesSkipsOthers | analyzer/src/tree.rs:57-60 | The run equals the run over the Go files alone |
| Tree.IndexFilesOk | analyzer/src/tree.rs:40-64 | The run succeeds exactly when every Go file reads and parses |
| Tree.IndexFilesError | analyzer/src/tree.rs:49-53 | A failed run reports the first Go file that does not read or parse, and why |
| Tree.CodeWalker.IndexOneFile | analyzer/src/tree.rs:41-56 | The loop body for one file is `IndexFile`: the store and the error are those it gives |
| Tree.CodeWalker.IndexProject | analyzer/src/tree.rs:38-65 | The store and the result are those of `IndexFiles` over the walker's files. One parser is created when there is a Go file, and none otherwise |

## Left out

- The TCP connection, `async`/`await`, `flush` and write errors are left out. The stream is
  the bytes the server sends, read through a cursor, and the bytes the client writes.
  Writes never fail.
- Logging and the tracing subscriber set up in `LspClient::new` are left out. The
  subscriber's `init()` panics when a global subscriber is already installed, so a second
  `LspClient::new` in one process panics before it connects; the model does not capture
  that panic.
- JSON is left out. serde's serialisation of the requests is an opaque function. Its
  parsing of a body is an opaque function to "not JSON" or "JSON with this `id`". The
  large initialize payload is reduced to its id, root URI and workspace name.
- `std::process::id()` is a parameter of `SendInitializeRequest`.
- `Lsp.LspClient.ReadResponse`: when the body runs past the end of input, the model leaves
  the cursor at the end. `read_exact` leaves the amount consumed unspecified. On a live
  socket the source would block rather than see the end of input.
- `Lsp.LspClient.ReadResponse`: a declared length above `isize::MAX`, where `vec![0; n]`
  panics with a capacity overflow, ends the read with the `CapacityOverflow` error and the
  cursor after the header. A failed allocation of a smaller buffer is left out: memory is
  unbounded in the model.
- `Lsp.IsAbsolute`: follows `PathBuf::is_absolute` on Unix (the path starts with `/`).
  Windows paths, which also need a drive or UNC prefix, are left out.
- `Tree.FilesOf` carries no contract of its own; `Tree.FilesOfMembers` and
  `Tree.FilesOfAppend` state what it holds and in what order.
- `Lsp.LspClient.constructor`: the header reading is held as a field (`bodyLength`) that
  the constructor sets to `BodyLength`. This keeps the client's proofs independent of the
  header parser's definition.
- tree-sitter is left out: `Parser::new`, `set_language`, `LangParser::new`,
  `LangParser::parse` and the grammar. A tree is an input value. The parser is an opaque
  function from text to an optional tree.
- `Tree.CodeWalker.IndexProject` requires `ParserSound`: every tree the parser builds for
  UTF-8 text has node ranges that lie in the text and decode. Tree-sitter nodes fall on
  character boundaries, so the indexer's `expect` never fires.
- `Tree.CodeWalker.IndexProject`: the parser cache is a map from language to a parser
  number. It is specified by the number of parsers created.
- `WalkDir` and `std::fs::read_to_string` are inputs. The walk is a sequence of entries,
  and file reading is a function from path to optional bytes. A read whose bytes are not
  UTF-8 fails like a missing file. `to_str().unwrap()` on a non-UTF-8 path is left out:
  paths are strings.
- The `Arc<Mutex<_>>` around the store is left out: the store is used exclusively.
- Channel send failures are left out. `send(...).expect` fails only when the receiver is
  dropped, which the parser, holding `rx` itself, never does.
- `LLMClient` and the command-line programs are left out: a remote model call and argument
  plumbing.
