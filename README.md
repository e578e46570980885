# OCR result bookkeeping, modelled in Dafny

The program reads an image, binarises it, runs the Tesseract OCR engine on it
and keeps track of the results. It comes in two near-duplicate variants. This
project models what the program itself does around the engine.

**C++ variant** (`OPENSW/opensw.cpp`):

- The recognised text block is split into lines with `std::getline`.
- The lines are appended one by one to a singly linked list of `ListNode`s.
- The list is written to a user-named file, one line per row, each row ending
  in `endl`.
- The file is read back line by line only when the user answers `y` or `Y`.
- The list is printed and deleted.

**C variant** (`opensw.c`):

- When the result file could be written, its name is copied with `strncpy` into
  a fixed 256-character buffer and forced NUL-terminated.
- That copy is appended to a global singly linked list of `Node`s.
- The list is printed on `y`/`Y` and then released, and `head` is reset to NULL.
- The image path argument is cut with the same bounded copy.
- The typed output file name loses its newline through `strcspn`.

Modules:

- `Text`: `Option` and the first-occurrence search `IndexOf`.
- `Getline`: one `getline` call (`GetLine`), the lines a `while (getline(...))`
  loop yields (`Split`), and the text written by `out << line << endl` over a
  list (`Join`). Their round-trip lemmas are here.
- `CString`: NUL-terminated buffers and the two C library routines the C variant
  relies on. `strncpy` is section 7.24.2.4 of ISO C11 and `strcspn` is section
  7.24.5.3. Also the 256-character bounded copy.
- `Ocr`: what both variants share around the engine. This is the engine's
  outcome (image not found, engine failed to initialise, or recognised text),
  the diagnostics, and the `y`/`Y` answer.
- `OpenswCpp`: `ListNode` and `LineList`. `LineList` holds `main`'s `head`
  together with a ghost node order, contents and footprint. Its methods are
  `appendNode` with its tail walk, the getline loop of `performOCR`,
  `saveOCRResult`, `printAndFreeList` and the save-load-print part of `main`.
  The module itself has `loadOCRResult` (`LoadOcrResult`), the y/n gate
  before it (`OfferReadBack`) and the whole session in `main` (`RunSession`).
- `OpenswC`: `Node` with its `array<char>` buffer and `FileList`, which holds
  the global `head`. Its methods are `addNode`, `printList`, the release loop
  and `performOCR`'s bookkeeping. The module itself has the buffer helpers
  and the session in `main` (`RecordAndList`, `RunSession`).

The engine, the files and the console are parameters or results:

- The engine's work is an `OcrOutcome` input.
- Whether a file can be opened is a `bool` input.
- A file's contents before a run and after it are an `Option<string>` (`None`:
  absent or unreadable). A run that does not write the file leaves it as it
  was, so the contents after are then the contents before.
- What a routine prints is returned as a `string`.

The model follows the code as written, including two behaviours a reader
might not expect:

- When OCR fails, the C++ variant still prompts for a name and writes an empty
  file. `OpenswCpp.RunSession` states exactly that.
- A read-back of an empty file still prints the `Content of ...:` header.

## Model

| member | source | states |
|---|---|---|
| Getline.GetLine | OPENSW/opensw.cpp:96 | One `getline` call fails exactly when no character is left in the stream, and otherwise consumes at least one character |
| Getline.GetLineReadsOneLine | OPENSW/opensw.cpp:96 | The extracted line holds no '\n'. The stream was the line, a '\n' and the rest; or, at end of stream, the line alone with nothing left |
| Getline.Split | OPENSW/opensw.cpp:94-99 | The split loop yields lines without any '\n'. It yields no line exactly for empty text |
| Getline.Join | OPENSW/opensw.cpp:113-118 | Writing each line followed by `endl` produces nothing exactly for an empty list, and otherwise text ending in '\n' |
| Getline.JoinAppend | OPENSW/opensw.cpp:114-117 | Writing one more line appends exactly that line and its '\n' to the text |
| Getline.SplitJoin | OPENSW/opensw.cpp:132-135 | Reading back written lines with `getline` recovers exactly those lines, in order, whenever no line contains '\n' |
| Getline.JoinSplit | OPENSW/opensw.cpp:94-99 | Writing the split lines back reproduces the text exactly when it is empty or ends in '\n'. Otherwise it reproduces the text plus one '\n' |
| Getline.HelloWorld | OPENSW/opensw.cpp:94-99 | "HELLO\nWORLD\n" splits into exactly "HELLO" and "WORLD", with no empty entry for the final '\n', and writing those back restores the text |
| Getline.InteriorEmptyLine | OPENSW/opensw.cpp:94-99 | An interior empty line is kept as an empty entry: "a\n\nb\n" splits into "a", "" and "b" |
| CString.StrNCpy | opensw.c:27 | `strncpy` writes exactly n characters |
| CString.StrNCpyAt | opensw.c:27 | Each written place holds the source's character while before the source's first NUL, and NUL from there on |
| CString.BoundedCopy | opensw.c:27-28 | The filename buffer is 256 characters with NUL at index 255. Its string has at most 255 characters and is the source's string, up to its first NUL, cut to 255 characters |
| CString.Strcspn | opensw.c:117 | `strcspn` counts the leading characters not in the reject set. It stops at the first rejected character or at the terminating NUL |
| CString.NewlineStrip | opensw.c:117 | Storing NUL at the `strcspn` index for "\n" leaves a string with no '\n'. That string is the old string up to its first '\n' |
| OpenswCpp.ListNode.constructor | OPENSW/opensw.cpp:22 | A new node holds the line and a null `next` |
| OpenswCpp.LineList.constructor | OPENSW/opensw.cpp:152 | `head` starts null: the list is empty |
| OpenswCpp.LineList.Tail | OPENSW/opensw.cpp:28-32 | On a non-empty acyclic list, the walk along `next` terminates at the last node, whose `next` is null |
| OpenswCpp.LineList.AppendNode | OPENSW/opensw.cpp:20-35 | Contents become the old contents plus the line at the end. On an empty list the new node becomes `head` with a null `next`. Otherwise `head` is kept. Existing nodes keep their order and lines; only the old tail's `next` changes. The list stays acyclic |
| OpenswCpp.LineList.LinkAfter | OPENSW/opensw.cpp:26-33 | On a non-empty list the node follows the last node, found by the walk; contents gain its line at the end, `head` is kept and the earlier links are unchanged |
| OpenswCpp.LineList.PerformOcr | OPENSW/opensw.cpp:50-106 | A failed image load or engine start prints its diagnostic and leaves the list alone. Otherwise the recognised lines are appended |
| OpenswCpp.LineList.CollectLines | OPENSW/opensw.cpp:94-99 | The getline loop appends exactly the lines of the text, in order, after the existing contents |
| OpenswCpp.LineList.PrintAndFreeList | OPENSW/opensw.cpp:38-48 | Every line is printed followed by '\n', in list order, and every node is visited exactly once, head to tail |
| OpenswCpp.LineList.SaveOcrResult | OPENSW/opensw.cpp:108-124 | An openable file receives exactly each line followed by '\n', in list order; an empty list writes nothing. An unopenable file is not written and the failure is reported |
| OpenswCpp.LineList.FinishSession | OPENSW/opensw.cpp:157-174 | The file holds the serialised list when it could be written and is untouched otherwise. It is read back only on 'y'/'Y'. Then the list is printed |
| OpenswCpp.Collected | OPENSW/opensw.cpp:94-99 | The lines collected from any OCR outcome survive saving and reading back unchanged |
| OpenswCpp.LoadOcrResult | OPENSW/opensw.cpp:126-142 | A readable file prints the header and then every line `getline` reads from it, each followed by '\n'. An unreadable one prints the read diagnostic |
| OpenswCpp.OfferReadBack | OPENSW/opensw.cpp:165-171 | The file is read back only when the answer is 'y' or 'Y'; any other answer prints nothing |
| OpenswCpp.RunSession | OPENSW/opensw.cpp:144-177 | The file holds the collected lines one per row when it could be written, including an empty file after a failed OCR. Reading it back on 'y'/'Y' shows the header and exactly the collected lines. When the file could not be written, a readable older file is shown line by line, and a missing one gives the open failure. The final listing shows the collected lines too |
| OpenswC.Node.constructor | opensw.c:22 | A new node owns a fresh buffer of MAX_FILENAME_LENGTH characters |
| OpenswC.CopyBounded | opensw.c:27-28 | The buffer receives the 256-character bounded copy of the source, in place |
| OpenswC.NewNode | opensw.c:22-29 | A fresh node's buffer holds the bounded copy of the filename and its `next` is NULL |
| OpenswC.StripNewline | opensw.c:117 | The buffer's string loses its first '\n' and everything after it, and holds no '\n' afterwards |
| OpenswC.ListingAppend | opensw.c:46-49 | Printing one more node appends exactly its "- name" line to the listing |
| OpenswC.ListingPrefix | opensw.c:46-49 | The listing of the first k+1 names is the listing of the first k followed by the line of name k |
| OpenswC.FileList.constructor | opensw.c:18 | `head` starts NULL: the list is empty |
| OpenswC.FileList.Tail | opensw.c:34-37 | On a non-empty acyclic list, the walk along `next` terminates at the last node, whose `next` is NULL |
| OpenswC.FileList.AddNode | opensw.c:21-40 | The new node's buffer is the bounded copy of the filename, and the list's buffers gain it at the end. The new node's `next` is NULL. It becomes `head` on an empty list, and `head` is kept otherwise. Existing buffers are unchanged and only the old tail's `next` changes |
| OpenswC.FileList.Link | opensw.c:31-39 | The node becomes `head` of an empty list or is hung after the last node. The list's buffers gain its buffer at the end. No other `next` changes and the list stays acyclic |
| OpenswC.FileList.LinkFirst | opensw.c:31-32 | On an empty list the node becomes `head` and its buffer the only entry |
| OpenswC.FileList.LinkAfter | opensw.c:33-39 | On a non-empty list the node follows the last node, found by the walk. `head` is kept and the earlier links are unchanged |
| OpenswC.FileList.PrintList | opensw.c:43-50 | The output is "OCR Results:\n" followed by one "- name\n" line per node, in list order, where name is the C string in that node's buffer |
| OpenswC.FileList.FreeAll | opensw.c:130-136 | Every node is visited exactly once, head to tail, and `head` ends NULL with the list empty |
| OpenswC.FileList.Finish | opensw.c:124-136 | The list is printed only on 'y'/'Y', and released either way |
| OpenswC.FileList.PerformOcr | opensw.c:52-99 | A failed image load or engine start prints its diagnostic and changes nothing. Otherwise the text goes to the file. The file keeps its old contents unless OCR succeeded and it opened. Only when the file opened is a node added, holding the bounded copy of the name, so each call adds at most one entry |
| OpenswC.BoundedCopyKeepsShortString | opensw.c:27-28 | A NUL-terminated 256-character buffer's string survives the bounded copy whole, so a node copied from it prints that string |
| OpenswC.RecordAndList | opensw.c:118-136 | Starting from the empty list, the file holds the OCR text when OCR succeeded and the file opened, and keeps its old contents otherwise. On 'y'/'Y' the listing shows the header and, in that case only, the output name; otherwise nothing is listed |
| OpenswC.RunSession | opensw.c:101-138 | The image path is the argument's string cut to 255 characters. The output name is the typed line up to its first '\n'. The file holds the OCR text when OCR succeeded and the file opened, and keeps its old contents otherwise. On 'y'/'Y' the listing shows the header and, in that case only, that one name |

## Left out

- The argument-count check and the usage message (OPENSW/opensw.cpp:146-149, opensw.c:103-107): each session starts after it.
- The image pipeline and the OCR engine are library calls whose behaviour is not part of this model. This covers `imread`/`cvLoadImage`, the grey-scale conversion, the threshold at 150, the Mat-to-Pix copy and Tesseract's `Init`, `SetImage` and `GetUTF8Text`. Their combined result is the `OcrOutcome` input.
- File and console I/O are modelled as parameters and results. Which files can be opened is a `bool`. A file's contents before the run are an `Option<string>`. The typed line and the y/n answer are inputs. What is printed is returned as a string, or only stated where the contract names it.
- `delete`, `free` and `TessDeleteText` are left out, and so are the `malloc` failure exit (opensw.c:23-26) and resource release. The free loops are modelled as traversals that visit every node once.
- `cin.ignore()` (OPENSW/opensw.cpp:160) is left out: it discards one character of console input before the name is read. The typed name is an input after that step.
- `fgets` (opensw.c:116) is left out: the typed buffer is an input, 256 characters holding a NUL.
- The OCR text as a C string: `stringstream ss(outText)` (OPENSW/opensw.cpp:94) and `fputs(outText, ...)` (opensw.c:82) stop at a NUL in `outText`. The model takes the recognised text as the characters before that NUL, so `Ocr.EngineText` holds no NUL.
- Character encoding: strings are sequences of `char`, and UTF-8 bytes are not distinguished from characters.
- OpenswCpp.LineList.FinishSession: `loadOCRResult` reopens the file with a new `ifstream` (OPENSW/opensw.cpp:128). The model assumes that a file which opened for writing opens again for reading and reads back exactly what was written. A write-only file, a device such as /dev/null or a FIFO would break this, and the model does not represent them.
- OpenswCpp.RunSession: makes the same assumption for the read-back as `OpenswCpp.LineList.FinishSession`.
- OpenswCpp.RunSession: does not return the console output of `performOCR` and `saveOCRResult`. Those are stated by `OpenswCpp.LineList.PerformOcr` and `OpenswCpp.LineList.SaveOcrResult`.
- OpenswC.RunSession: does not return the console output of `performOCR` or the image path's use by the engine. Those are stated by `OpenswC.FileList.PerformOcr`.
