/**
 * The C variant (opensw.c): the name of each result file that was written
 * is kept, cut to a fixed-size buffer, in a singly linked list hanging from
 * the global `head`; the list is printed on request and then released.
 */
module OpenswC {
  import opened Text
  import opened CString
  import opened Ocr

  /** `typedef struct Node`: a filename buffer of MAX_FILENAME_LENGTH chars and the link to the next node. */
  class Node {
    const filename: array<char>
    var next: Node?

    /** `malloc(sizeof(Node))`: room for the buffer and the link, neither set yet. */
    constructor ()
      ensures filename.Length == MaxFilenameLength && fresh(filename)
    {
      filename := new char[MaxFilenameLength];
    }

    /** The buffer is MAX_FILENAME_LENGTH long and holds exactly `buf`. */
    ghost predicate Holds(buf: seq<char>)
      reads filename
    {
      filename.Length == MaxFilenameLength && filename[..] == buf
    }
  }

  /**
   * `strncpy(dest, src, MAX_FILENAME_LENGTH - 1)` followed by
   * `dest[MAX_FILENAME_LENGTH - 1] = '\0'` (lines 27-28 and 110-111).
   */
  method CopyBounded(dest: array<char>, src: seq<char>)
    requires dest.Length == MaxFilenameLength
    requires MaxFilenameLength - 1 <= |src| || NUL in src
    modifies dest
    ensures dest[..] == BoundedCopy(src)
  {
    var copied := StrNCpy(src, MaxFilenameLength - 1);
    forall i | 0 <= i < MaxFilenameLength - 1 {
      dest[i] := copied[i];
    }
    dest[MaxFilenameLength - 1] := NUL;
  }

  /**
   * `outputFilename[strcspn(outputFilename, "\n")] = '\0'` (line 117): the
   * buffer's string loses its first newline and everything after it.
   */
  method StripNewline(buf: array<char>)
    requires NUL in buf[..]
    modifies buf
    ensures buf[..] == old(buf[..])[Strcspn(old(buf[..]), {'\n'}) := NUL]
    ensures CStr(buf[..]) == CStr(old(buf[..]))[..IndexOf(CStr(old(buf[..])), '\n')]
    ensures '\n' !in CStr(buf[..])
  {
    NewlineStrip(buf[..]);
    buf[Strcspn(buf[..], {'\n'})] := NUL;
  }

  /**
   * Lines 22-29 of `addNode`: a fresh node whose buffer holds the bounded
   * copy of `filename` and whose `next` is NULL.
   */
  method NewNode(filename: seq<char>) returns (node: Node)
    requires MaxFilenameLength - 1 <= |filename| || NUL in filename
    ensures fresh(node) && fresh(node.filename)
    ensures node.filename[..] == BoundedCopy(filename) && node.next == null
  {
    node := new Node();
    CopyBounded(node.filename, filename);
    node.next := null;
  }

  /** The line `printList` prints before the names. */
  const ResultsHeader: string := "OCR Results:\n"

  /** The strings the buffers hold, as `printf("%s", ...)` prints them. */
  function Names(bufs: seq<seq<char>>): seq<seq<char>> {
    seq(|bufs|, i requires 0 <= i < |bufs| => CStr(bufs[i]))
  }

  /** The line `printList` prints for one name. */
  function Entry(name: seq<char>): string {
    "- " + name + "\n"
  }

  /** What `printList` prints for the names, one entry each, in order. */
  function Listing(names: seq<seq<char>>): string {
    if names == [] then [] else Entry(names[0]) + Listing(names[1..])
  }

  /** Printing one more name appends its line to the listing. */
  lemma {:induction false} ListingAppend(names: seq<seq<char>>, name: seq<char>)
    ensures Listing(names + [name]) == Listing(names) + Entry(name)
  {
    if names == [] {
      assert [] + [name] == [name];
    } else {
      assert (names + [name])[1..] == names[1..] + [name];
      ListingAppend(names[1..], name);
    }
  }

  /** The listing of one more name of `names` extends the listing of the shorter prefix. */
  lemma ListingPrefix(names: seq<seq<char>>, k: nat)
    requires k < |names|
    ensures Listing(names[..k + 1]) == Listing(names[..k]) + Entry(names[k])
  {
    assert names[..k + 1] == names[..k] + [names[k]];
    ListingAppend(names[..k], names[k]);
  }

  /**
   * The global `Node *head` and the list hanging from it. `Nodes` is the
   * ghost order of the nodes from head to tail and `Buffers` the contents
   * of each one's filename buffer.
   */
  class FileList {
    var head: Node?
    ghost var Nodes: seq<Node>
    ghost var Buffers: seq<seq<char>>
    ghost var Repr: set<object>

    /**
     * `head` is the first node, each node's `next` is the node after it and
     * the last one's is null, no node occurs twice, and every buffer is
     * MAX_FILENAME_LENGTH long and holds the matching entry of `Buffers`.
     */
    ghost predicate Valid()
      reads this, Repr
    {
      this in Repr &&
      (forall i :: 0 <= i < |Nodes| ==> Nodes[i] in Repr && Nodes[i].filename in Repr) &&
      |Buffers| == |Nodes| &&
      head == (if Nodes == [] then null else Nodes[0]) &&
      (forall i :: 0 <= i < |Nodes| - 1 ==> Nodes[i].next == Nodes[i + 1]) &&
      (Nodes != [] ==> Nodes[|Nodes| - 1].next == null) &&
      (forall i, j :: 0 <= i < j < |Nodes| ==> Nodes[i] != Nodes[j]) &&
      (forall i :: 0 <= i < |Nodes| ==> Nodes[i].Holds(Buffers[i]))
    }

    /** `Node *head = NULL;` */
    constructor ()
      ensures Valid() && fresh(Repr)
      ensures head == null && Buffers == []
    {
      head := null;
      Nodes, Buffers := [], [];
      Repr := {this};
    }

    /**
     * The walk at lines 34-37 of `addNode`: from `head`, follow `next` until
     * it is NULL. On an acyclic, non-empty list it ends, at the last node.
     */
    method Tail() returns (last: Node)
      requires Valid() && head != null
      ensures last == Nodes[|Nodes| - 1] && last.next == null
    {
      var current := head;
      ghost var k := 0;
      while current.next != null
        invariant Valid() && 0 <= k < |Nodes| && current == Nodes[k]
        invariant current.next == if k + 1 < |Nodes| then Nodes[k + 1] else null
        decreases |Nodes| - k
      {
        current := current.next;
        k := k + 1;
      }
      last := current;
    }

    /**
     * `addNode(filename)`: a new node gets a bounded, always terminated copy
     * of `filename` and a NULL `next`, and is linked after the last node, or
     * becomes `head` on an empty list. Existing nodes keep their buffers, and
     * only the old tail's `next` changes.
     */
    method AddNode(filename: seq<char>)
      requires Valid()
      requires MaxFilenameLength - 1 <= |filename| || NUL in filename
      modifies Repr
      ensures Valid() && fresh(Repr - old(Repr))
      ensures Buffers == old(Buffers) + [BoundedCopy(filename)]
      ensures Nodes[..|old(Nodes)|] == old(Nodes) && fresh(Nodes[|Nodes| - 1])
      ensures Nodes[|Nodes| - 1].next == null
      ensures old(head) == null ==> head == Nodes[0]
      ensures old(head) != null ==> head == old(head)
      ensures forall i :: 0 <= i < |old(Nodes)| - 1 ==> Nodes[i].next == old(Nodes[i].next)
      ensures forall i :: 0 <= i < |old(Nodes)| ==> Nodes[i].filename[..] == old(Nodes[i].filename[..])
    {
      var newNode := NewNode(filename);
      Link(newNode, newNode.filename[..]);
    }

    /**
     * Lines 31-39 of `addNode`: `node` becomes `head` on an empty list and
     * is hung after the last node otherwise. No buffer is written.
     */
    method Link(node: Node, ghost buf: seq<char>)
      requires Valid()
      requires node !in Repr && node.filename !in Repr
      requires node.Holds(buf) && node.next == null
      modifies this, Nodes
      ensures Valid() && Repr == old(Repr) + {node, node.filename}
      ensures Nodes == old(Nodes) + [node] && Buffers == old(Buffers) + [buf]
      ensures node.next == null
      ensures old(head) == null ==> head == node
      ensures old(head) != null ==> head == old(head)
      ensures forall i :: 0 <= i < |old(Nodes)| - 1 ==> Nodes[i].next == old(Nodes[i].next)
    {
      if head == null {
        LinkFirst(node, buf);
      } else {
        LinkAfter(node, buf);
      }
    }

    /** Lines 31-32 of `addNode`: on an empty list the node becomes `head`. */
    method LinkFirst(node: Node, ghost buf: seq<char>)
      requires Valid() && head == null
      requires node !in Repr && node.filename !in Repr
      requires node.Holds(buf) && node.next == null
      modifies this
      ensures Valid() && Repr == old(Repr) + {node, node.filename}
      ensures Nodes == [node] && Buffers == [buf] && head == node
    {
      head := node;
      Nodes := [node];
      Buffers := [buf];
      Repr := Repr + {node, node.filename};
    }

    /** Lines 34-38 of `addNode`: the node is hung after the last one, found by walking `next`. */
    method LinkAfter(node: Node, ghost buf: seq<char>)
      requires Valid() && head != null
      requires node !in Repr && node.filename !in Repr
      requires node.Holds(buf) && node.next == null
      modifies this, Nodes[|Nodes| - 1]
      ensures Valid() && Repr == old(Repr) + {node, node.filename}
      ensures Nodes == old(Nodes) + [node] && Buffers == old(Buffers) + [buf]
      ensures head == old(head)
      ensures forall i :: 0 <= i < |old(Nodes)| - 1 ==> Nodes[i].next == old(Nodes[i].next)
    {
      var last := Tail();
      Nodes := Nodes + [node];
      Buffers := Buffers + [buf];
      Repr := Repr + {node, node.filename};
      last.next := node;
    }

    /** `printList()`: the header, then one `"- " + name` line per node, from head to tail. */
    method PrintList() returns (printed: string)
      requires Valid()
      ensures printed == ResultsHeader + Listing(Names(Buffers))
    {
      var current := head;
      printed := ResultsHeader;
      ghost var k := 0;
      while current != null
        invariant Valid() && 0 <= k <= |Nodes|
        invariant current == if k < |Nodes| then Nodes[k] else null
        invariant printed == ResultsHeader + Listing(Names(Buffers)[..k])
        decreases |Nodes| - k
      {
        var name := CStr(current.filename[..]);
        ListingPrefix(Names(Buffers), k);
        printed := printed + Entry(name);
        current := current.next;
        k := k + 1;
      }
      assert Names(Buffers)[..k] == Names(Buffers);
    }

    /**
     * The release loop at lines 130-136 of `main`: every node is visited
     * once, from head to tail (and, in the source, freed), then `head` is
     * reset to NULL.
     */
    method FreeAll() returns (freed: seq<Node>)
      requires Valid()
      modifies this
      ensures Valid() && head == null && Buffers == []
      ensures freed == old(Nodes)
    {
      var current := head;
      freed := [];
      ghost var k := 0;
      while current != null
        invariant Valid() && 0 <= k <= |Nodes|
        invariant current == if k < |Nodes| then Nodes[k] else null
        invariant freed == Nodes[..k]
        decreases |Nodes| - k
      {
        freed := freed + [current];
        current := current.next;
        k := k + 1;
      }
      assert Nodes[..k] == Nodes;
      head := null;
      Nodes, Buffers := [], [];
      Repr := {this};
    }

    /**
     * Lines 124-136 of `main`: the list is printed only when the answer is
     * 'y' or 'Y', and released either way.
     */
    method Finish(loadOption: char) returns (listed: string)
      requires Valid()
      modifies this
      ensures Valid() && head == null && Buffers == []
      ensures listed == if WantsReadBack(loadOption) then ResultsHeader + Listing(Names(old(Buffers))) else []
    {
      listed := [];
      if WantsReadBack(loadOption) {
        listed := PrintList();
      }
      var freed := FreeAll();
    }

    /**
     * `performOCR(inputImage, outputFilename)` past the image pipeline and
     * the engine: a failed image load or engine initialisation prints its
     * diagnostic and changes nothing; otherwise the text goes to the output
     * file, and only when that file could be opened is its name added to the
     * list, so each call adds at most one entry. `previous` is what the output
     * file held before (`None`: absent or unreadable) and `file` what it holds
     * after: a failure before or at `fopen` leaves it as it was.
     */
    method PerformOcr(outcome: OcrOutcome, outputFilename: seq<char>, canWrite: bool, previous: Option<string>)
      returns (file: Option<string>, console: string)
      requires Valid()
      requires MaxFilenameLength - 1 <= |outputFilename| || NUL in outputFilename
      modifies Repr
      ensures Valid() && fresh(Repr - old(Repr))
      ensures Buffers == old(Buffers) +
        if outcome.Recognized? && canWrite then [BoundedCopy(outputFilename)] else []
      ensures file == if outcome.Recognized? && canWrite then Some(outcome.text) else previous
      ensures console ==
        if !outcome.Recognized? then Diagnostic(outcome)
        else if canWrite then SavedMessage(CStr(outputFilename))
        else WriteFailure
    {
      file := previous;
      if !outcome.Recognized? {
        return file, Diagnostic(outcome);
      }
      if canWrite {
        file := Some(outcome.text);
        console := SavedMessage(CStr(outputFilename));
        AddNode(outputFilename);
      } else {
        console := WriteFailure;
      }
    }
  }

  /**
   * A NUL-terminated buffer of MAX_FILENAME_LENGTH chars already fits: the
   * bounded copy keeps its whole string.
   */
  lemma BoundedCopyKeepsShortString(src: seq<char>)
    requires |src| == MaxFilenameLength && NUL in src
    ensures CStr(BoundedCopy(src)) == CStr(src)
    ensures Names([BoundedCopy(src)]) == [CStr(src)]
  {
    assert StrLen(src) < |src|;
  }

  /**
   * Lines 118-136 of `main`: the (initially empty) list records the output name when OCR
   * wrote the file, is printed on 'y' or 'Y', and is released. `previous`
   * and `file` are the output file's contents before and after, as for
   * `FileList.PerformOcr`.
   */
  method RecordAndList(outcome: OcrOutcome, outputFilename: seq<char>, canWrite: bool, previous: Option<string>, loadOption: char)
    returns (file: Option<string>, listed: string)
    requires |outputFilename| == MaxFilenameLength && NUL in outputFilename
    ensures file == if outcome.Recognized? && canWrite then Some(outcome.text) else previous
    ensures !WantsReadBack(loadOption) ==> listed == []
    ensures WantsReadBack(loadOption) ==>
      listed == ResultsHeader + if outcome.Recognized? && canWrite then Listing([CStr(outputFilename)]) else []
  {
    var list := new FileList();
    var console;
    file, console := list.PerformOcr(outcome, outputFilename, canWrite, previous);
    BoundedCopyKeepsShortString(outputFilename);
    listed := list.Finish(loadOption);
  }

  /**
   * `main` after its argument check: the image path is a bounded copy of
   * the argument; the typed output name (the buffer as `fgets` left it)
   * loses its newline; OCR runs and records that name when the file was
   * written; the list is printed only on 'y' or 'Y'; then it is released.
   * `previous` is what the output file held before the run and `file` what
   * it holds after.
   */
  method RunSession(argument: seq<char>, typed: seq<char>, outcome: OcrOutcome, canWrite: bool,
                    previous: Option<string>, loadOption: char)
    returns (imagePath: seq<char>, outputName: seq<char>, file: Option<string>, listed: string)
    requires NUL in argument
    requires |typed| == MaxFilenameLength && NUL in typed
    ensures |imagePath| == MaxFilenameLength
    ensures CStr(imagePath) == CStr(argument)[..Min(StrLen(argument), MaxFilenameLength - 1)]
    ensures outputName == CStr(typed)[..IndexOf(CStr(typed), '\n')] && '\n' !in outputName
    ensures file == if outcome.Recognized? && canWrite then Some(outcome.text) else previous
    ensures !WantsReadBack(loadOption) ==> listed == []
    ensures WantsReadBack(loadOption) ==>
      listed == ResultsHeader + if outcome.Recognized? && canWrite then Listing([outputName]) else []
  {
    var inputImage := new char[MaxFilenameLength];
    CopyBounded(inputImage, argument);
    imagePath := inputImage[..];

    var outputFilename := new char[MaxFilenameLength](i requires 0 <= i < MaxFilenameLength => typed[i]);
    assert outputFilename[..] == typed;
    StripNewline(outputFilename);

    var stripped := outputFilename[..];
    outputName := CStr(stripped);

    file, listed := RecordAndList(outcome, stripped, canWrite, previous, loadOption);
  }
}
