/**
 * The C++ variant (OPENSW/opensw.cpp): the recognised text is split into
 * lines with `getline`, kept in a singly linked list of `ListNode`s, written
 * to a file one line per row, optionally read back, and finally printed.
 */
module OpenswCpp {
  import opened Text
  import opened Getline
  import opened Ocr

  /** `struct ListNode`: one line of text and the link to the next node. */
  class ListNode {
    var line: string
    var next: ListNode?

    /** `new ListNode{ line, nullptr }` */
    constructor (line: string)
      ensures this.line == line && next == null
    {
      this.line := line;
      next := null;
    }
  }

  /**
   * The `ListNode* head` of `main`, which `performOCR` and `appendNode`
   * receive by reference, together with the list it points to. `Nodes` is
   * the ghost order of the nodes from head to tail and `Contents` their lines.
   */
  class LineList {
    var head: ListNode?
    ghost var Nodes: seq<ListNode>
    ghost var Contents: seq<string>
    ghost var Repr: set<object>

    /**
     * `head` is the first node, each node's `next` is the node after it and
     * the last one's is null, and no node occurs twice, so the list is acyclic.
     */
    ghost predicate Valid()
      reads this, Repr
    {
      this in Repr &&
      (forall i :: 0 <= i < |Nodes| ==> Nodes[i] in Repr) &&
      |Contents| == |Nodes| &&
      head == (if Nodes == [] then null else Nodes[0]) &&
      (forall i :: 0 <= i < |Nodes| ==> Nodes[i].line == Contents[i]) &&
      (forall i :: 0 <= i < |Nodes| - 1 ==> Nodes[i].next == Nodes[i + 1]) &&
      (Nodes != [] ==> Nodes[|Nodes| - 1].next == null) &&
      (forall i, j :: 0 <= i < j < |Nodes| ==> Nodes[i] != Nodes[j])
    }

    /** `ListNode* head = nullptr;` */
    constructor ()
      ensures Valid() && fresh(Repr)
      ensures head == null && Contents == []
    {
      head := null;
      Nodes, Contents := [], [];
      Repr := {this};
    }

    /**
     * The walk at lines 28-32 of `appendNode`: from `head`, follow `next`
     * until it is null. On an acyclic, non-empty list it ends, at the last node.
     */
    method Tail() returns (last: ListNode)
      requires Valid() && head != null
      ensures last == Nodes[|Nodes| - 1] && last.next == null
    {
      var current := head;
      ghost var k := 0;
      while current.next != null
        invariant Valid() && 0 <= k < |Nodes| && current == Nodes[k]
        invariant current.next == if k + 1 < |Nodes| then Nodes[k + 1] else null
        decreases |Nodes| - k
      {
        current := current.next;
        k := k + 1;
      }
      last := current;
    }

    /**
     * `appendNode(head, line)`: a new node holding `line` is linked after the
     * last node, found by walking `next` until it is null; on an empty list
     * the new node becomes `head`. Existing nodes keep their lines, and only
     * the old tail's `next` changes.
     */
    method AppendNode(line: string)
      requires Valid()
      modifies Repr
      ensures Valid() && fresh(Repr - old(Repr))
      ensures Contents == old(Contents) + [line]
      ensures Nodes[..|old(Nodes)|] == old(Nodes) && fresh(Nodes[|Nodes| - 1])
      ensures old(head) == null ==> head == Nodes[0] && head.next == null
      ensures old(head) != null ==> head == old(head)
      ensures forall i :: 0 <= i < |old(Nodes)| - 1 ==> Nodes[i].next == old(Nodes[i].next)
    {
      var newNode := new ListNode(line);
      if head == null {
        head := newNode;
        Nodes, Contents, Repr := [newNode], [line], Repr + {newNode};
      } else {
        LinkAfter(newNode);
      }
    }

    /** Lines 26-33 of `appendNode`, on a non-empty list: the node is hung after the last one, found by walking `next`. */
    method LinkAfter(node: ListNode)
      requires Valid() && head != null
      requires node !in Repr && node.next == null
      modifies this, Nodes[|Nodes| - 1]
      ensures Valid() && Repr == old(Repr) + {node}
      ensures Nodes == old(Nodes) + [node] && Contents == old(Contents) + [node.line]
      ensures head == old(head)
      ensures forall i :: 0 <= i < |old(Nodes)| - 1 ==> Nodes[i].next == old(Nodes[i].next)
    {
      var last := Tail();
      Nodes := Nodes + [node];
      Contents := Contents + [node.line];
      Repr := Repr + {node};
      last.next := node;
    }

    /**
     * `performOCR(inputImage, head)`, past the image pipeline and the engine:
     * a failed image load or engine initialisation prints its diagnostic and
     * returns before the list is touched; otherwise the recognised lines are
     * appended.
     */
    method PerformOcr(outcome: OcrOutcome) returns (console: string)
      requires Valid()
      modifies Repr
      ensures Valid() && fresh(Repr - old(Repr))
      ensures Contents == old(Contents) + Collected(outcome)
      ensures console == Diagnostic(outcome)
    {
      console := Diagnostic(outcome);
      if outcome.Recognized? {
        CollectLines(outcome.text);
      }
    }

    /**
     * The loop at lines 94-99 of `performOCR`: every line that `getline`
     * yields from the recognised text is appended, in text order.
     */
    method CollectLines(text: string)
      requires Valid()
      modifies Repr
      ensures Valid() && fresh(Repr - old(Repr))
      ensures Contents == old(Contents) + Split(text)
    {
      var stream := text;
      var got := GetLine(stream);
      ghost var appended := [];
      while got.Some?
        invariant Valid() && fresh(Repr - old(Repr))
        invariant got == GetLine(stream)
        invariant Contents == old(Contents) + appended
        invariant appended + Split(stream) == Split(text)
        decreases |stream|
      {
        var line, rest := got.value.line, got.value.rest;
        SplitStep(appended, stream);
        AppendNode(line);
        appended := appended + [line];
        stream := rest;
        got := GetLine(stream);
      }
    }

    /**
     * `printAndFreeList(head)`: prints every line followed by `endl`, from
     * head to tail, and returns the nodes in the order it visits (and, in the
     * source, deletes) them: each node exactly once.
     */
    method PrintAndFreeList() returns (printed: string, visited: seq<ListNode>)
      requires Valid()
      ensures printed == Join(Contents)
      ensures visited == Nodes
    {
      var current := head;
      printed, visited := [], [];
      ghost var k := 0;
      while current != null
        invariant Valid() && 0 <= k <= |Nodes|
        invariant current == if k < |Nodes| then Nodes[k] else null
        invariant printed == Join(Contents[..k]) && visited == Nodes[..k]
        decreases |Nodes| - k
      {
        JoinAppend(Contents[..k], current.line);
        assert Contents[..k + 1] == Contents[..k] + [current.line];
        printed := printed + current.line + "\n";
        visited := visited + [current];
        current := current.next;
        k := k + 1;
      }
      assert Contents[..k] == Contents && Nodes[..k] == Nodes;
    }

    /**
     * Lines 157-174 of `main`: save the list under the typed name, read the
     * file back only on 'y' or 'Y', then print the list. `previous` is what
     * the output file held before (`None`: unreadable), `file` what it holds
     * after, `readBack` what `loadOCRResult` printed and `listed` what
     * `printAndFreeList` printed.
     */
    method FinishSession(outputFilename: string, canWrite: bool, previous: Option<string>, loadOption: char)
      returns (file: Option<string>, readBack: string, listed: string)
      requires Valid()
      ensures file == if canWrite then Some(Join(Contents)) else previous
      ensures !WantsReadBack(loadOption) ==> readBack == []
      ensures WantsReadBack(loadOption) && file.None? ==> readBack == ReadFailure
      ensures WantsReadBack(loadOption) && file.Some? ==>
        readBack == ContentHeader(outputFilename) + Join(Split(file.value))
      ensures listed == Join(Contents)
    {
      var saved, saveConsole := SaveOcrResult(outputFilename, canWrite);
      file := if saved.Some? then saved else previous;
      readBack := OfferReadBack(loadOption, outputFilename, file);
      var visited;
      listed, visited := PrintAndFreeList();
    }

    /**
     * `saveOCRResult(filename, head)`: when the file opens, it receives every
     * line followed by `endl`, in list order (nothing at all for an empty
     * list); otherwise nothing is written. `file` is what the file holds
     * afterwards, `None` when it could not be opened.
     */
    method SaveOcrResult(filename: string, canOpen: bool) returns (file: Option<string>, console: string)
      requires Valid()
      ensures canOpen ==> file == Some(Join(Contents)) && console == SavedMessage(filename)
      ensures !canOpen ==> file == None && console == WriteFailure
    {
      if !canOpen {
        return None, WriteFailure;
      }
      var written := [];
      var current := head;
      ghost var k := 0;
      while current != null
        invariant Valid() && 0 <= k <= |Nodes|
        invariant current == if k < |Nodes| then Nodes[k] else null
        invariant written == Join(Contents[..k])
        decreases |Nodes| - k
      {
        JoinAppend(Contents[..k], current.line);
        assert Contents[..k + 1] == Contents[..k] + [current.line];
        written := written + current.line + "\n";
        current := current.next;
        k := k + 1;
      }
      assert Contents[..k] == Contents;
      file := Some(written);
      console := SavedMessage(filename);
    }
  }

  /**
   * The lines `performOCR` collects: those of the recognised text, none
   * after a failure. No collected line holds a '\n', so saving them and
   * reading the file back with `getline` yields them again.
   */
  function Collected(outcome: OcrOutcome): (lines: seq<string>)
    ensures Split(Join(lines)) == lines
  {
    var lines := if outcome.Recognized? then Split(outcome.text) else [];
    SplitJoin(lines);
    lines
  }

  /** The header `loadOCRResult` prints before the file's lines. */
  function ContentHeader(filename: string): string {
    "Content of " + filename + ":\n"
  }

  /** What `loadOCRResult` prints when the file cannot be opened for reading. */
  const ReadFailure: string := "Could not open the file for reading.\n"

  /**
   * `loadOCRResult(filename)`: when the file can be read (`stored` is its
   * contents), prints a header and then every line `getline` reads from it,
   * each followed by `endl`; otherwise prints a diagnostic.
   */
  method LoadOcrResult(filename: string, stored: Option<string>) returns (console: string)
    ensures stored.None? ==> console == ReadFailure
    ensures stored.Some? ==> console == ContentHeader(filename) + Join(Split(stored.value))
  {
    if stored.None? {
      return ReadFailure;
    }
    console := ContentHeader(filename);
    var stream := stored.value;
    var got := GetLine(stream);
    while got.Some?
      invariant got == GetLine(stream)
      invariant console + Join(Split(stream)) == ContentHeader(filename) + Join(Split(stored.value))
      decreases |stream|
    {
      var line := got.value.line;
      SplitStep([], stream);
      assert ([line] + Split(got.value.rest))[1..] == Split(got.value.rest);
      assert Join(Split(stream)) == line + "\n" + Join(Split(got.value.rest));
      console := console + line + "\n";
      stream := got.value.rest;
      got := GetLine(stream);
    }
  }

  /**
   * Lines 165-171 of `main`: the saved file is read back only when the
   * user answers 'y' or 'Y'; any other answer prints nothing.
   */
  method OfferReadBack(loadOption: char, filename: string, stored: Option<string>) returns (console: string)
    ensures !WantsReadBack(loadOption) ==> console == []
    ensures WantsReadBack(loadOption) && stored.None? ==> console == ReadFailure
    ensures WantsReadBack(loadOption) && stored.Some? ==>
      console == ContentHeader(filename) + Join(Split(stored.value))
  {
    console := [];
    if WantsReadBack(loadOption) {
      console := LoadOcrResult(filename, stored);
    }
  }

  /**
   * `main` after its argument check: OCR into an empty list, then save,
   * offer the read-back and print (see `FinishSession`). The save happens
   * even when OCR failed, writing an empty file. Whatever the outcome, the
   * file holds the collected lines one per row, reading it back shows
   * exactly those lines, and the final listing shows them too.
   */
  method RunSession(outcome: OcrOutcome, outputFilename: string, canWrite: bool,
                    previous: Option<string>, loadOption: char)
    returns (file: Option<string>, readBack: string, listed: string)
    ensures file == if canWrite then Some(Join(Collected(outcome))) else previous
    ensures !WantsReadBack(loadOption) ==> readBack == []
    ensures WantsReadBack(loadOption) && file.None? ==> readBack == ReadFailure
    ensures WantsReadBack(loadOption) && file.Some? ==>
      readBack == ContentHeader(outputFilename) + Join(Split(file.value))
    ensures WantsReadBack(loadOption) && canWrite ==>
      readBack == ContentHeader(outputFilename) + Join(Collected(outcome))
    ensures listed == Join(Collected(outcome))
  {
    var list := new LineList();
    var ocrConsole := list.PerformOcr(outcome);
    assert list.Contents == Collected(outcome);
    file, readBack, listed := list.FinishSession(outputFilename, canWrite, previous, loadOption);
  }
}
